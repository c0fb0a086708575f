/** `rSplitOnce` of src/utils.c: split a string at the last occurrence of
    a delimiter, found by a right-to-left scan, and return the part before
    it (`LEFT`) or after it (`RIGHT`). Strings are sequences of characters
    without the terminating NUL; a `NULL` result is `None`. */
module Utils {
  import opened Common

  /** The `side` values of the anonymous enumeration in src/utils.c. */
  const LEFT: int := 0
  const RIGHT: int := 1

  // ---------------------------------------------------------------------
  // The scan as written
  // ---------------------------------------------------------------------

  /** The backward scan from index `i` with `delim[d]` the next character
      to match. A match steps both back; a mismatch resets `d` to the last
      delimiter character without testing the current character again.
      The result is the index where `delim[0]` matched. */
  function ScanFrom(input: string, delim: string, i: int, d: nat): (r: Option<nat>)
    requires -1 <= i < |input| && d < |delim|
    ensures r.Some? ==> r.value <= i && input[r.value] == delim[0]
    decreases i + 1
  {
    if i < 0 then None
    else if input[i] == delim[d] then
      if d == 0 then Some(i) else ScanFrom(input, delim, i - 1, d - 1)
    else ScanFrom(input, delim, i - 1, |delim| - 1)
  }

  /** Where the scan of the whole input stops, if it does. */
  function Found(input: string, delim: string): Option<nat>
    requires |delim| > 0
  {
    ScanFrom(input, delim, |input| - 1, |delim| - 1)
  }

  /** The value `rSplitOnce` returns. */
  function RSplit(input: string, delim: string, side: int): Option<string>
    requires |delim| > 0
  {
    match Found(input, delim)
    case None => None
    case Some(i) => Some(if side == RIGHT then input[i + 1..] else input[..i])
  }

  /** `rSplitOnce(input, delim, side)`; `delim` must not be empty (the C
      reads `delim[-1]` otherwise). */
  method RSplitOnce(input: string, delim: string, side: int) returns (r: Option<string>)
    requires |delim| > 0
    ensures r == RSplit(input, delim, side)
  {
    var d: int := |delim| - 1;
    var found := false;
    var i := |input| - 1;
    while i >= 0
      invariant -1 <= i < |input| && 0 <= d < |delim|
      invariant Found(input, delim) == ScanFrom(input, delim, i, d)
      decreases i + 1
    {
      if input[i] == delim[d] {
        d := d - 1;
        if d < 0 {
          found := true;
          break;
        }
      } else {
        d := |delim| - 1;
      }
      i := i - 1;
    }
    if found {
      if side == RIGHT {
        return Some(input[i + 1..]);
      } else {
        return Some(input[..i]);
      }
    }
    return None;
  }

  // ---------------------------------------------------------------------
  // What the scan finds
  // ---------------------------------------------------------------------

  /** `delim` occurs in `input` starting at index `i`. */
  predicate OccursAt(input: string, delim: string, i: int) {
    0 <= i && i + |delim| <= |input| && forall j | 0 <= j < |delim| :: input[i + j] == delim[j]
  }

  /** Whatever the scan stops at is a real occurrence: the characters
      already matched, `delim[d + 1..]`, follow index `i`, and the scan only
      stops once `delim[0]` has matched too. */
  lemma {:induction false} ScanFindsOccurrence(input: string, delim: string, i: int, d: nat)
    requires -1 <= i < |input| && d < |delim| && i - d + |delim| <= |input|
    requires forall j | d < j < |delim| :: input[i - d + j] == delim[j]
    ensures ScanFrom(input, delim, i, d).Some? ==> OccursAt(input, delim, ScanFrom(input, delim, i, d).value)
    decreases i + 1
  {
    if i >= 0 {
      if input[i] == delim[d] {
        if d > 0 {
          ScanFindsOccurrence(input, delim, i - 1, d - 1);
        }
      } else {
        ScanFindsOccurrence(input, delim, i - 1, |delim| - 1);
      }
    }
  }

  /** A found split point starts an occurrence of the delimiter; the
      empty input never has one. */
  lemma FoundIsOccurrence(input: string, delim: string)
    requires |delim| > 0
    ensures Found(input, delim).Some? ==> OccursAt(input, delim, Found(input, delim).value)
    ensures input == [] ==> Found(input, delim).None?
  {
    ScanFindsOccurrence(input, delim, |input| - 1, |delim| - 1);
  }

  /** `LEFT` is exactly the text before the occurrence. */
  lemma LeftIsPrefix(input: string, delim: string)
    requires |delim| > 0
    ensures RSplit(input, delim, LEFT).Some? ==>
      var i := Found(input, delim).value;
      OccursAt(input, delim, i) && RSplit(input, delim, LEFT).value == input[..i]
  {
    FoundIsOccurrence(input, delim);
  }

  /** For a one-character delimiter the scan stops at its last
      occurrence up to index `i`, and at none when it does not occur. */
  lemma {:induction false} SingleCharScan(input: string, c: char, i: int)
    requires -1 <= i < |input|
    ensures ScanFrom(input, [c], i, 0).None? <==> forall k | 0 <= k <= i :: input[k] != c
    ensures ScanFrom(input, [c], i, 0).Some? ==>
      var j := ScanFrom(input, [c], i, 0).value;
      input[j] == c && forall k | j < k <= i :: input[k] != c
    decreases i + 1
  {
    if i >= 0 && input[i] != c {
      SingleCharScan(input, c, i - 1);
    }
  }

  // ---------------------------------------------------------------------
  // Where the scan departs from "split at the last occurrence"
  // ---------------------------------------------------------------------

  /** A partial match that fails is not re-tested from the failing
      character: "ab" occurs in "abb" but is not found. */
  lemma MissesOccurrenceAfterPartialMatch()
    ensures OccursAt("abb", "ab", 0)
    ensures Found("abb", "ab").None?
  {
    assert ScanFrom("abb", "ab", -1, 1).None?;
    assert ScanFrom("abb", "ab", 0, 1).None?;
    assert ScanFrom("abb", "ab", 1, 0).None?;
  }

  /** After the same failed partial match the scan can also stop at an
      earlier occurrence than the last: "ab" occurs in "ababb" at 0 and 2,
      and the scan finds 0. */
  lemma FindsEarlierOccurrence()
    ensures OccursAt("ababb", "ab", 2)
    ensures Found("ababb", "ab") == Some(0)
  {
    assert ScanFrom("ababb", "ab", 0, 0) == Some(0);
    assert ScanFrom("ababb", "ab", 1, 1) == Some(0);
    assert ScanFrom("ababb", "ab", 2, 1) == Some(0);
    assert ScanFrom("ababb", "ab", 3, 0) == Some(0);
  }

  /** `RIGHT` starts one character after the delimiter's first character,
      so for a longer delimiter it keeps the delimiter's tail. */
  lemma RightKeepsDelimiterTail()
    ensures RSplit("a::b", "::", RIGHT) == Some(":b")
  {
    assert ScanFrom("a::b", "::", 1, 0) == Some(1);
    assert ScanFrom("a::b", "::", 2, 1) == Some(1);
    assert ScanFrom("a::b", "::", 3, 1) == Some(1);
    assert "a::b"[2..] == ":b";
  }

  // ---------------------------------------------------------------------
  // Split at the last occurrence
  // ---------------------------------------------------------------------

  /** The last occurrence of `delim` starting at or before index `i`. */
  function LastFrom(input: string, delim: string, i: int): (r: Option<nat>)
    ensures r.Some? ==> r.value <= i && OccursAt(input, delim, r.value)
    ensures r.Some? ==> forall k | r.value < k <= i :: !OccursAt(input, delim, k)
    ensures r.None? ==> forall k | k <= i :: !OccursAt(input, delim, k)
    decreases i + 1
  {
    if i < 0 then None
    else if OccursAt(input, delim, i) then Some(i)
    else LastFrom(input, delim, i - 1)
  }

  /** The last occurrence of `delim` in `input`. */
  function LastOccurrence(input: string, delim: string): (r: Option<nat>)
    ensures r.Some? ==> OccursAt(input, delim, r.value)
    ensures r.Some? ==> forall k | r.value < k :: !OccursAt(input, delim, k)
    ensures r.None? <==> forall k :: !OccursAt(input, delim, k)
  {
    LastFrom(input, delim, |input| - |delim|)
  }

  /** The evidently intended split: the text before or after the last
      whole occurrence of the delimiter. */
  function SplitLast(input: string, delim: string, side: int): (r: Option<string>)
    ensures r.None? <==> forall k :: !OccursAt(input, delim, k)
  {
    match LastOccurrence(input, delim)
    case None => None
    case Some(i) => Some(if side == RIGHT then input[i + |delim|..] else input[..i])
  }

  /** The two sides of the intended split, rejoined with the delimiter,
      give back the input. */
  lemma SplitLastRejoins(input: string, delim: string)
    ensures SplitLast(input, delim, LEFT).Some? <==> SplitLast(input, delim, RIGHT).Some?
    ensures SplitLast(input, delim, LEFT).Some? ==>
      SplitLast(input, delim, LEFT).value + delim + SplitLast(input, delim, RIGHT).value == input
  {
    match LastOccurrence(input, delim)
    case None =>
    case Some(i) =>
      assert input == input[..i] + input[i..i + |delim|] + input[i + |delim|..];
  }

  /** For a one-character delimiter the scan from `i` and the search for
      the last occurrence at or before `i` stop at the same index. */
  lemma {:induction false} SingleCharLast(input: string, c: char, i: int)
    requires -1 <= i < |input|
    ensures ScanFrom(input, [c], i, 0) == LastFrom(input, [c], i)
    decreases i + 1
  {
    if i >= 0 {
      if input[i] == c {
        assert forall j | 0 <= j < 1 :: input[i + j] == [c][j];
      } else {
        assert input[i + 0] != [c][0];
        SingleCharLast(input, c, i - 1);
      }
    }
  }

  /** For a one-character delimiter the scan as written is the intended
      split, on both sides. */
  lemma SingleCharAgrees(input: string, c: char, side: int)
    ensures RSplit(input, [c], side) == SplitLast(input, [c], side)
  {
    SingleCharLast(input, c, |input| - 1);
    assert Found(input, [c]) == LastOccurrence(input, [c]);
  }
}
