/** The line index: the offsets at which the lines of the text begin. */
module LineIndex {

  const NEWLINE: char := '\n'

  /** The start of the line holding position `pos`: the greatest `s <= pos`
      that is 0 or follows a newline. */
  function LineStartBefore(text: seq<char>, pos: nat): (s: nat)
    requires pos <= |text|
    ensures s <= pos
    ensures s == 0 || text[s - 1] == NEWLINE
    ensures NEWLINE !in text[s..pos]
  {
    if pos == 0 || text[pos - 1] == NEWLINE then pos
    else
      var s := LineStartBefore(text, pos - 1);
      assert text[s..pos] == text[s..pos - 1] + [text[pos - 1]];
      s
  }

  /** The line index the host holds after scanning `text[..i]`: 0, then one
      entry past each newline seen so far. */
  function LineStartsUpTo(text: seq<char>, i: nat): (starts: seq<nat>)
    requires i <= |text|
    ensures |starts| > 0 && starts[0] == 0
    ensures forall k :: 0 <= k < |starts| ==> starts[k] <= i
  {
    if i == 0 then [0]
    else LineStartsUpTo(text, i - 1) + (if text[i - 1] == NEWLINE then [i] else [])
  }

  /** One entry per newline, plus the leading 0. */
  lemma {:induction false} LineStartsCount(text: seq<char>, i: nat)
    requires i <= |text|
    ensures |LineStartsUpTo(text, i)| == multiset(text[..i])[NEWLINE] + 1
  {
    if i > 0 {
      LineStartsCount(text, i - 1);
      assert text[..i] == text[..i - 1] + [text[i - 1]];
    }
  }

  lemma {:induction false} LineStartsIncreasing(text: seq<char>, i: nat)
    requires i <= |text|
    ensures forall a, b :: 0 <= a < b < |LineStartsUpTo(text, i)| ==>
              LineStartsUpTo(text, i)[a] < LineStartsUpTo(text, i)[b]
  {
    if i > 0 {
      LineStartsIncreasing(text, i - 1);
    }
  }

  /** Every entry after the first is one past a newline. */
  lemma {:induction false} LineStartsAfterNewline(text: seq<char>, i: nat)
    requires i <= |text|
    ensures forall k :: 0 < k < |LineStartsUpTo(text, i)| ==>
              0 < LineStartsUpTo(text, i)[k] && text[LineStartsUpTo(text, i)[k] - 1] == NEWLINE
  {
    if i > 0 {
      LineStartsAfterNewline(text, i - 1);
    }
  }

  /** Every newline scanned so far has its successor in the index. */
  lemma {:induction false} LineStartsComplete(text: seq<char>, i: nat)
    requires i <= |text|
    ensures forall p :: 0 <= p < i && text[p] == NEWLINE ==> p + 1 in LineStartsUpTo(text, i)
  {
    if i > 0 {
      LineStartsComplete(text, i - 1);
    }
  }

  /** The last entry is the start of the line holding position `i`. */
  lemma {:induction false} LineStartsLast(text: seq<char>, i: nat)
    requires i <= |text|
    ensures LineStartsUpTo(text, i)[|LineStartsUpTo(text, i)| - 1] == LineStartBefore(text, i)
  {
    if i > 0 {
      LineStartsLast(text, i - 1);
    }
  }

  /** The line index of the whole text. */
  function LineStarts(text: seq<char>): seq<nat>
  {
    LineStartsUpTo(text, |text|)
  }

  /** Scanning further only appends entries, and every appended entry lies
      past the point where the shorter scan stopped. */
  lemma {:induction false} LineStartsExtend(text: seq<char>, i: nat, j: nat)
    requires i <= j <= |text|
    ensures LineStartsUpTo(text, i) <= LineStartsUpTo(text, j)
    ensures forall k :: |LineStartsUpTo(text, i)| <= k < |LineStartsUpTo(text, j)| ==>
              LineStartsUpTo(text, j)[k] > i
  {
    if i < j {
      LineStartsExtend(text, i, j - 1);
    }
  }

  /** The host's loop: start with 0 and push `i + 1` for every newline at
      position `i`. The result starts at 0, increases strictly, has one entry
      per newline plus one, and its later entries are exactly the positions
      one past a newline. */
  method BuildLineStarts(text: seq<char>) returns (starts: seq<nat>)
    ensures starts == LineStarts(text)
    ensures |starts| == multiset(text)[NEWLINE] + 1
    ensures starts[0] == 0
    ensures forall a, b :: 0 <= a < b < |starts| ==> starts[a] < starts[b]
    ensures forall k :: 0 < k < |starts| ==> 0 < starts[k] <= |text| && text[starts[k] - 1] == NEWLINE
    ensures forall p :: 0 <= p < |text| && text[p] == NEWLINE ==> p + 1 in starts
  {
    starts := [0];
    for i := 0 to |text|
      invariant starts == LineStartsUpTo(text, i)
    {
      if text[i] == NEWLINE {
        starts := starts + [i + 1];
      }
    }
    assert text[..|text|] == text;
    LineStartsCount(text, |text|);
    LineStartsIncreasing(text, |text|);
    LineStartsAfterNewline(text, |text|);
    LineStartsComplete(text, |text|);
  }
}
