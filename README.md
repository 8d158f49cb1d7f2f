# applegrep, modelled in Dafny

applegrep is a literal (non-regex) substring search. The host program copies
the text and the pattern, each closed with a NUL byte, into shared buffers. It
launches one `grep_kernel` instance per candidate start offset and waits for
all of them. It then reads back a match counter and a fixed number of offset
slots. For every retained offset it prints the line that holds it, as
`file:line:<tab>text`.

This project models that core as sequential Dafny and proves what it computes:

- `cstrings.dfy` (module `CStrings`): the kernel's length scans up to the
  first NUL, and its 32-bit unsigned subtraction.
- `channel.dfy` (module `Channel`): the result channel. The class
  `ResultChannel` holds the counter, the slot array and a capacity. Its
  `Reserve` method is one atomic fetch-and-add followed by the guarded slot
  write. A ghost sequence `Found` records every reported offset in counter
  order. The invariant `Valid` ties the first `min(counter, capacity)` slots
  to `Found`.
- `match_kernel.dfy` (module `MatchKernel`): the per-offset kernel. It
  measures both lengths, rejects an empty pattern and out-of-range thread ids,
  compares right to left, and reserves a slot on a match. `KernelAccepts` is
  its specification.
- `dispatch.dfy` (module `Dispatch`): the grid width, the launch as a
  sequential loop over thread ids, and the read-back that clamps the count.
- `line_index.dfy` (module `LineIndex`): the line-start index and the loop
  that builds it.
- `line_mapper.dfy` (module `LineMapper`): the linear search for the line
  that owns an offset, and the cut of that line's text.
- `grep.dfy` (module `Grep`): the host's `Search`, which strings these parts
  together. It also states what is found: exactly the occurrences of a
  non-empty pattern when the text has no NUL byte.

The device may run kernel instances in any order. The model runs them in
ascending thread-id order, which is one legal schedule. Its results are stated
as a set of offsets and a count, never as the order of the slots.

Two reference definitions give the records their meaning independently of the
line index. `LineStartBefore` is the greatest position at or before an offset
that starts a line. `LineEndAfter` is the first newline (or the end of the
text) at or after it. The line number of an offset is one more than the number
of newlines before it.

Points where the model follows the code closely:

- The header count printed at main.cpp line 172 is the clamped count from
  line 168, not the number of matches the kernel counted.
- The line of an offset is found by a linear scan over the line starts
  (lines 187-192); there is no binary search.
- The empty-text and empty-pattern guard (lines 102-106) returns before
  dispatch. A pattern longer than the text is not guarded, which is the first
  finding below.
- Bytes are modelled as Dafny `char`. Apart from the left-out table at line 48,
  which indexes with a possibly signed `char`, the code only compares bytes
  with each other and tests them for NUL and `'\n'`, so the choice of element
  type does not change any result.

## Model

| member | source | states |
|---|---|---|
| CStrings.CLength | applegrep/main.cpp:27-33 | the kernel's length is the index of the first NUL: every earlier byte is non-NUL |
| CStrings.StrLen | applegrep/main.cpp:28-33 | the kernel's scanning loop stops exactly at the first NUL |
| CStrings.CStringLength | applegrep/main.cpp:125-128 | for a buffer whose only NUL is the appended terminator, the kernel measures the original length |
| CStrings.USub32 | applegrep/main.cpp:36 | `text_length - pattern_length` on uint: exact when no underflow, otherwise the difference plus 2^32 |
| Channel.ResultChannel.Retained | applegrep/main.cpp:61-64 | the retained slots are the first min(counter, capacity) reported offsets |
| Channel.ResultChannel.constructor | applegrep/main.cpp:131-137 | a zero counter and zero-filled slots, nothing reported yet |
| Channel.ResultChannel.Reserve | applegrep/main.cpp:61-64 | the counter goes up by one and the old value is returned; the offset is written to that slot only below capacity; no other slot changes, and in particular no slot already holding a retained offset is written again; the retained list grows by the offset exactly when it was written |
| MatchKernel.MatchesAt | applegrep/main.cpp:52-59 | the right-to-left loop ends with `j < 0` exactly when `text[tid + k] == pattern[k]` for every `k` below the pattern length |
| MatchKernel.KernelAccepts | applegrep/main.cpp:27-59 | an accepted `tid` has a non-empty pattern (its buffer holds more than the terminator) occurring in the text buffer at `tid` |
| MatchKernel.KernelAcceptsIff | applegrep/main.cpp:27-59 | on a NUL-free text, the kernel accepts `tid` exactly when the pattern is non-empty and occurs at `tid` |
| MatchKernel.KernelGuard | applegrep/main.cpp:28-36 | the guard rejects `tid` past `n - m` only when the measured text length `n` is at least the pattern length `m`; when an embedded NUL makes `n < m`, the wrap lets every dispatched `tid` through |
| MatchKernel.GrepKernel | applegrep/main.cpp:20-66 | one instance reports its `tid` to the channel exactly when the kernel accepts it, and the counter rises by one per report |
| Dispatch.GridWidth | applegrep/main.cpp:152 | the grid width `N - M + 1` on size_t: exact when `M <= N + 1`, otherwise wrapped by 2^64 |
| Dispatch.GridWidthUnderflow | applegrep/main.cpp:152 | a 3-byte text and a 5-byte pattern give a grid of 2^64 - 1 instances |
| Dispatch.CandidateCount | applegrep/main.cpp:152 | the number of instances is exactly the number of candidate offsets `o` with `o + M <= N`, zero when the pattern is longer |
| Dispatch.GridWidthAgrees | applegrep/main.cpp:152 | the written grid width equals the candidate count exactly when it does not wrap |
| Dispatch.Accepted | applegrep/main.cpp:152-161 | the offsets a full grid reports are exactly those below the grid width that the kernel accepts, in strictly increasing order |
| Dispatch.AcceptedIsMatchSet | applegrep/main.cpp:61-64 | the final counter equals the number of matching offsets, and the reported offsets form exactly the match set |
| Dispatch.DispatchGrid | applegrep/main.cpp:152-161 | after the launch and wait, the channel holds exactly the accepted offsets |
| Dispatch.Harvest | applegrep/main.cpp:164-170 | the count read back is min(counter, slots), the warning fires exactly when the counter exceeds the slots, and the copied slots are the first offsets reported |
| LineIndex.LineStartBefore | applegrep/main.cpp:195 | the start of the line holding a position: at or before it, at 0 or just after a newline, with no newline in between |
| LineIndex.LineStartsUpTo | applegrep/main.cpp:176-182 | the partial index starts with 0 and every entry is within the scanned prefix |
| LineIndex.LineStartsCount | applegrep/main.cpp:176-182 | the index has one entry per newline plus one |
| LineIndex.LineStartsIncreasing | applegrep/main.cpp:176-182 | the index is strictly increasing |
| LineIndex.LineStartsAfterNewline | applegrep/main.cpp:179-180 | every entry after the first is one past a newline |
| LineIndex.LineStartsComplete | applegrep/main.cpp:178-181 | every newline position `p` has `p + 1` in the index |
| LineIndex.LineStartsLast | applegrep/main.cpp:176-182 | the last entry of the index for a prefix is the start of the line holding the prefix's end |
| LineIndex.LineStartsExtend | applegrep/main.cpp:178-181 | scanning further only appends entries, all past the shorter scan's end |
| LineIndex.BuildLineStarts | applegrep/main.cpp:176-182 | the loop's index starts with 0, increases strictly, has one entry per newline plus one, and its later entries are exactly the positions one past a newline |
| LineMapper.LineEndAfter | applegrep/main.cpp:196-198 | the end of the line holding a position: at or after it, at a newline or the end of the text, with no newline in between |
| LineMapper.LineEndUnique | applegrep/main.cpp:196-198 | any such end of line is the one `LineEndAfter` gives |
| LineMapper.FindLine | applegrep/main.cpp:187-192 | the search stops at the first line whose range holds the offset, or falls through to the last line when none does |
| LineMapper.LineOfOffset | applegrep/main.cpp:187-192 | on the text's own index the chosen line starts at or before the offset and the next line (if any) starts after it; its index is the number of newlines before the offset, so the reported number is that plus one |
| LineMapper.LineEnd | applegrep/main.cpp:196-198 | the end of line `k` is at or after its start, and is either the end of the text or a newline |
| LineMapper.NoNewlineInLine | applegrep/main.cpp:194-198 | no newline lies between the start of line `k` and its end |
| LineMapper.ExtractLine | applegrep/main.cpp:199 | line `k`'s text is the slice of the text from the line's start that stops at a newline or the end of the text, and contains no newline |
| LineMapper.LineEndOfOffset | applegrep/main.cpp:195-198 | the chosen line's end is at or after the offset and is the end of the line holding it |
| LineMapper.ExtractLineOfOffset | applegrep/main.cpp:195-199 | the sliced text is exactly the line holding the offset and contains no newline |
| LineMapper.MatchBeforeLineEnd | applegrep/main.cpp:195-199 | a match without a newline ends inside the line holding its start |
| LineMapper.MatchInLine | applegrep/main.cpp:195-199 | a match without a newline re-occurs in its line's text at column `pos - lineStart` |
| Grep.CapacityMismatch | applegrep/main.cpp:62 | as written, every match from the 11th to the 1000th gets a slot index the kernel accepts but the host's ten-slot buffer lacks |
| Grep.Buffers | applegrep/main.cpp:125-128 | the NUL-terminated copies of text and pattern satisfy what the kernel and the grid need |
| Grep.MatchesAreOccurrences | applegrep/main.cpp:20-66 | on a NUL-free text with a non-empty pattern, the grid's match set is exactly the set of offsets where the pattern occurs |
| Grep.NoMatches | applegrep/main.cpp:102-106 | an empty text, an empty pattern, or a pattern longer than the text gives no match |
| Grep.MapRecords | applegrep/main.cpp:176-203 | each record keeps its offset, and its line number and line text are those of the line holding the offset |
| Grep.RetainedPrefix | applegrep/main.cpp:170 | the retained offsets are distinct members of the match set |
| Grep.OffsetsOfRecords | applegrep/main.cpp:184-185 | the records carry exactly the retained offsets |
| Grep.RunGrid | applegrep/main.cpp:125-170 | after copying, launching and reading back: the count is min(number of matches, 10), the warning fires exactly when there are more than 10, and the retained offsets are distinct matches inside the text that cover every match when none was dropped |
| Grep.Search | applegrep/main.cpp:81-204 | empty input reports zero with no warning; the header count is min(number of matches, 10); the warning fires exactly when there are more than 10; records are distinct matches, each described by its own line; when none was dropped they cover every match |

## Left out

- Metal device creation, shader compilation, pipeline, command queue,
  buffer creation, encoding, commit and wait, and the `release` calls
  (applegrep/main.cpp:109-161, 206-214). These are framework calls with no
  logic of their own. The launch and wait become `Dispatch.DispatchGrid`.
- `readFile` and reading standard input (lines 70-79, 85-93). The text is a
  parameter. An unreadable file becomes an empty text, which `Grep.Search`
  covers.
- The argument-count dispatch and all printing (lines 94-97, 103-104,
  166-167, 172-173, 202). The model keeps the printed values: the count, the
  warning flag, the line number and the line text.
- Real GPU concurrency and `memory_order_relaxed` (line 61). The atomic
  increment becomes a field update, and instances run one after another.
  Slot order under other schedules is not modelled. Only the set of offsets
  and the count are stated.
- The bad-character shift table (lines 39-49). It is built but never used to
  shift, so it does not affect which offsets match. Line 48 indexes the
  table with a pattern byte as a possibly signed `char`, so a byte of 0x80
  or above would index outside the table; that write is not modelled.
- The `memcpy` read-back (line 170) is the prefix of the slot array.
- Grep.Search: requires a text shorter than 2^31 bytes. Offsets are stored in
  `int` slots and thread ids are `uint`, and longer texts would wrap both.
- Grep.Search: requires a pattern without a NUL byte. A command-line argument
  cannot contain one.
- Grep.Search: launches the corrected number of instances (`CandidateCount`)
  rather than the wrapping grid width. The two agree whenever the width does
  not wrap (`Dispatch.GridWidthAgrees`).
- Grep.Search: uses one capacity, the host's 10 slots, for both the kernel's
  guard and the buffer, rather than the kernel's 1000.
- Embedded NUL bytes in the text are modelled in the kernel. The statement that
  matches are exactly the occurrences (`Grep.MatchesAreOccurrences`) needs a
  NUL-free text and a non-empty pattern. `MatchKernel.KernelGuard` describes the behaviour otherwise.

## Findings

| source | as written | input that shows it | evidently intended | confidence | as-written member | corrected member |
|---|---|---|---|---|---|---|
| applegrep/main.cpp:152 | the grid width `text.size() - pattern.size() + 1` is computed on `size_t` and wraps when the pattern is at least two bytes longer than the text | text `aaa`, pattern `aaaaa`: a grid of 2^64 - 1 instances; the kernel's own guard also wraps on `uint`, so instances read past the end of the text buffer and what they report is undefined | no instance, and zero matches, when the pattern is longer than the text | not executed | Dispatch.GridWidthUnderflow | Dispatch.CandidateCount |
| applegrep/main.cpp:62 | the kernel writes a slot whenever the pre-increment count is below 1000, but the host allocates only `max_matches = 10` slots (lines 100, 137) | a text of eleven `a` bytes and the pattern `a`: the 11th match is written to slot 10 of a ten-slot buffer | the kernel's guard uses the host's slot count | not executed | Grep.CapacityMismatch | Channel.ResultChannel.Reserve |
