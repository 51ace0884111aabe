/** The pieces of JavaScript regular-expression matching the core relies on:
    runs of a character class and the greedy `(.*)` capture before a closing
    character, which cannot cross a line terminator. */
module Patterns {
  import opened Wrappers
  import opened Text

  /** The end of the run of `[a-zA-Z0-9]` characters that starts at index `i`. */
  function AlnumRun(s: string, i: nat): (j: nat)
    requires i <= |s|
    ensures i <= j <= |s| && AllAlnum(s[i..j])
    ensures j < |s| ==> !IsAlnum(s[j])
    decreases |s| - i
  {
    if i < |s| && IsAlnum(s[i]) then
      var j := AlnumRun(s, i + 1);
      assert s[i..j] == [s[i]] + s[i + 1..j];
      j
    else i
  }

  /** A run of alphanumerics followed by a non-alphanumeric is read whole. */
  lemma AlnumRunOf(s: string, i: nat, j: nat)
    requires i <= j < |s| && AllAlnum(s[i..j]) && !IsAlnum(s[j])
    ensures AlnumRun(s, i) == j
    decreases j - i
  {
    if i < j {
      assert s[i] == s[i..j][0];
      assert s[i + 1..j] == s[i..j][1..];
      AlnumRunOf(s, i + 1, j);
    }
  }

  /** The index of the first line terminator at or after `i`, or `|s|`. */
  function LineEnd(s: string, i: nat): (e: nat)
    requires i <= |s|
    ensures i <= e <= |s| && NoLineTerminator(s[i..e])
    ensures e < |s| ==> IsLineTerminator(s[e])
    decreases |s| - i
  {
    if i < |s| && !IsLineTerminator(s[i]) then
      var e := LineEnd(s, i + 1);
      assert s[i..e] == [s[i]] + s[i + 1..e];
      e
    else i
  }

  /** The last index in `[lo, hi)` holding `c`. */
  function LastIndexIn(s: string, lo: nat, hi: nat, c: char): (k: Option<nat>)
    requires lo <= hi <= |s|
    ensures k.Some? ==> lo <= k.value < hi && s[k.value] == c
    ensures forall p :: lo <= p < hi && s[p] == c ==> k.Some? && p <= k.value
    decreases hi - lo
  {
    if hi == lo then None
    else if s[hi - 1] == c then Some(hi - 1)
    else LastIndexIn(s, lo, hi - 1, c)
  }

  /** Where a greedy `(.*)` starting at `from` and followed by `close` stops:
      the last `close` before the line ends. */
  function GreedyCapture(s: string, from: nat, close: char): (k: Option<nat>)
    requires from <= |s| && !IsLineTerminator(close)
    ensures k.Some? ==> from <= k.value < |s| && s[k.value] == close && NoLineTerminator(s[from..k.value])
    ensures forall p :: from <= p < |s| && s[p] == close && NoLineTerminator(s[from..p]) ==> k.Some? && p <= k.value
  {
    var e := LineEnd(s, from);
    CaptureWithinLine(s, from, e, close);
    LastIndexIn(s, from, e, close)
  }

  /** When the text ends with `close` and no line ends in between, the
      capture runs to that last character. */
  lemma GreedyToEnd(s: string, from: nat, close: char)
    requires from < |s| && s[|s| - 1] == close && !IsLineTerminator(close)
    requires NoLineTerminator(s[from..|s| - 1])
    ensures GreedyCapture(s, from, close) == Some(|s| - 1)
  {
  }

  lemma CaptureWithinLine(s: string, from: nat, e: nat, close: char)
    requires from <= |s| && e == LineEnd(s, from)
    ensures forall k :: from <= k < e ==> NoLineTerminator(s[from..k])
    ensures forall p :: from <= p < |s| && s[p] == close && NoLineTerminator(s[from..p]) && !IsLineTerminator(close) ==> p < e
  {
    forall k | from <= k < e
      ensures NoLineTerminator(s[from..k])
    {
      assert s[from..k] == s[from..e][..k - from];
    }
    forall p | from <= p < |s| && s[p] == close && NoLineTerminator(s[from..p]) && !IsLineTerminator(close)
      ensures p < e
    {
      LineEndBound(s, from, p);
    }
  }

  /** A stretch without line terminators ends no later than the line does. */
  lemma {:induction false} LineEndBound(s: string, from: nat, p: nat)
    requires from <= p <= |s| && NoLineTerminator(s[from..p])
    ensures p <= LineEnd(s, from)
    decreases p - from
  {
    if from < p {
      assert s[from] == s[from..p][0];
      assert s[from + 1..p] == s[from..p][1..];
      LineEndBound(s, from + 1, p);
    }
  }
}
