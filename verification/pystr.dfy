/** Python string primitives used by the upload handler: `str.strip()`,
    `str.rstrip(chars)`, `str.lower()` and `str.rfind(sub)`, stated over
    `string` (a sequence of Unicode scalar values, as a Python `str` is). */
module PyStr {

  /** The characters for which CPython's `str.isspace()` holds; `str.strip()`
      with no argument removes exactly these from both ends. */
  predicate IsSpace(c: char) {
    || ('\U{9}' <= c <= '\U{D}')
    || ('\U{1C}' <= c <= '\U{20}')
    || c == '\U{85}' || c == '\U{A0}' || c == '\U{1680}'
    || ('\U{2000}' <= c <= '\U{200A}')
    || c == '\U{2028}' || c == '\U{2029}' || c == '\U{202F}'
    || c == '\U{205F}' || c == '\U{3000}'
  }

  /** Every character of `s` is one that `drop` selects. */
  ghost predicate AllIn(s: string, drop: char -> bool) {
    forall k :: 0 <= k < |s| ==> drop(s[k])
  }

  /** Scanning forward from `i`, the index of the first character that
      `drop` does not select, or `|s|` when there is none. */
  function SkipForward(s: string, drop: char -> bool, i: nat): (j: nat)
    requires i <= |s|
    ensures i <= j <= |s|
    ensures forall k :: i <= k < j ==> drop(s[k])
    ensures j < |s| ==> !drop(s[j])
    decreases |s| - i
  {
    if i == |s| || !drop(s[i]) then i else SkipForward(s, drop, i + 1)
  }

  /** Scanning backward from `j`, the index just past the last character
      before `j` that `drop` does not select, or 0 when there is none. */
  function SkipBackward(s: string, drop: char -> bool, j: nat): (i: nat)
    requires j <= |s|
    ensures i <= j
    ensures forall k :: i <= k < j ==> drop(s[k])
    ensures 0 < i ==> !drop(s[i - 1])
  {
    if j == 0 || !drop(s[j - 1]) then j else SkipBackward(s, drop, j - 1)
  }

  /** `s[i..j]` is what stripping the `drop` characters from both ends of
      `s` leaves: everything cut away on either side is a `drop` character,
      and a non-empty slice neither starts nor ends with one. */
  ghost predicate StripBounds(s: string, i: int, j: int, drop: char -> bool) {
    && 0 <= i <= j <= |s|
    && (forall k :: 0 <= k < i ==> drop(s[k]))
    && (forall k :: j <= k < |s| ==> drop(s[k]))
    && (i < j ==> !drop(s[i]) && !drop(s[j - 1]))
  }

  /** `r` is the result of stripping `drop` characters from both ends of `s`. */
  ghost predicate IsStripOf(r: string, s: string, drop: char -> bool) {
    exists i, j :: StripBounds(s, i, j, drop) && r == s[i..j]
  }

  /** Strip the `drop` characters from both ends, scanning from the left
      first and then from the right, as CPython's `do_strip` does. */
  function StripBy(s: string, drop: char -> bool): (r: string)
    ensures IsStripOf(r, s, drop)
  {
    var i := SkipForward(s, drop, 0);
    var j := if i == |s| then i else SkipBackward(s, drop, |s|);
    assert StripBounds(s, i, j, drop);
    s[i..j]
  }

  /** Python's `str.strip()` with no argument. */
  function Strip(s: string): string {
    StripBy(s, IsSpace)
  }

  /** Whatever satisfies the stripping characterisation is unique, so
      `StripBy` is the one function with its contract. */
  lemma StripUnique(r1: string, r2: string, s: string, drop: char -> bool)
    requires IsStripOf(r1, s, drop) && IsStripOf(r2, s, drop)
    ensures r1 == r2
  {
    var i1, j1 :| StripBounds(s, i1, j1, drop) && r1 == s[i1..j1];
    var i2, j2 :| StripBounds(s, i2, j2, drop) && r2 == s[i2..j2];
    if i1 < j1 {
      // s[i1] and s[j1 - 1] are kept, so the other slice cannot cut them away
      assert i2 <= i1 < j2 && i2 <= j1 - 1 < j2;
      assert i1 <= i2 && j2 <= j1;
    }
  }

  /** Stripping twice changes nothing more than stripping once. */
  lemma StripIdempotent(s: string)
    ensures Strip(Strip(s)) == Strip(s)
  {
    var r := Strip(s);
    var i, j :| StripBounds(s, i, j, IsSpace) && r == s[i..j];
    assert StripBounds(r, 0, |r|, IsSpace) && r == r[0..|r|];
    StripUnique(Strip(r), r, r, IsSpace);
  }

  /** Python's `str.rstrip(chars)` for a one-character `chars`: remove every
      trailing `c`. */
  function RStrip(s: string, c: char): (r: string)
    ensures |r| <= |s| && r == s[..|r|]
    ensures forall k :: |r| <= k < |s| ==> s[k] == c
    ensures r == [] || r[|r| - 1] != c
  {
    s[..SkipBackward(s, x => x == c, |s|)]
  }

  /** `str.lower()` on one character, for the ASCII letters. */
  function LowerChar(c: char): char {
    if 'A' <= c <= 'Z' then (c as int + 32) as char else c
  }

  /** `str.lower()`, character by character (see README on non-ASCII letters). */
  function Lower(s: string): string {
    seq(|s|, k requires 0 <= k < |s| => LowerChar(s[k]))
  }

  /** The index of the last `c` before index `j` of `s`, or -1. */
  function LastBefore(s: string, c: char, j: nat): (i: int)
    requires j <= |s|
    ensures -1 <= i < j
    ensures 0 <= i ==> s[i] == c
    ensures forall k :: i < k < j ==> s[k] != c
  {
    if j == 0 then -1 else if s[j - 1] == c then j - 1 else LastBefore(s, c, j - 1)
  }

  /** Python's `str.rfind(c)`: the index of the last `c` in `s`, or -1. */
  function RFind(s: string, c: char): (i: int)
    ensures -1 <= i < |s|
    ensures 0 <= i ==> s[i] == c
    ensures forall k :: i < k < |s| ==> s[k] != c
  {
    LastBefore(s, c, |s|)
  }

  /** The index of the first character other than `c` at or after index `i`
      of `s`, or `|s|`. */
  function FirstOtherFrom(s: string, c: char, i: nat): (j: nat)
    requires i <= |s|
    ensures i <= j <= |s|
    ensures forall k :: i <= k < j ==> s[k] == c
    ensures j < |s| ==> s[j] != c
    decreases |s| - i
  {
    if i == |s| || s[i] != c then i else FirstOtherFrom(s, c, i + 1)
  }

  /** Stripping leaves nothing exactly when every character is stripped. */
  lemma StripEmptyIff(s: string, drop: char -> bool)
    ensures StripBy(s, drop) == [] <==> AllIn(s, drop)
  {
    var r := StripBy(s, drop);
    assert IsStripOf(r, s, drop);
    var i, j :| StripBounds(s, i, j, drop) && r == s[i..j];
    if i == j {
      forall k | 0 <= k < |s|
        ensures drop(s[k])
      {
      }
    }
  }

  /** Appending one more `c` does not change what `RStrip` leaves. */
  lemma RStripAppended(s: string, c: char)
    ensures RStrip(s + [c], c) == RStrip(s, c)
  {
    var t := s + [c];
    assert RStrip(s, c) == t[..|RStrip(s, c)|];
  }
}
