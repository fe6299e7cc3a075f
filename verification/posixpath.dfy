/** `os.path.splitext` as the POSIX flavour of Python's `os.path`
    (`posixpath`) defines it: the separator is `/`, there is no alternative
    separator, and the extension separator is `.`. */
module PosixPath {
  import opened PyStr

  /** The extension as a reader would describe it: the path from its last
      dot on, provided that dot lies in the last path component (after the
      last `/`) and is not one of the component's leading dots, so a dot
      file such as `.ics` has no extension. */
  function Extension(p: string): string {
    var sep := RFind(p, '/');
    var dot := RFind(p, '.');
    if sep < dot && FirstOtherFrom(p, '.', sep + 1) < dot then p[dot..] else []
  }

  /** `RFind` is the only index with its contract. */
  lemma RFindUnique(s: string, c: char, i: int)
    requires -1 <= i < |s|
    requires 0 <= i ==> s[i] == c
    requires forall k :: i < k < |s| ==> s[k] != c
    ensures RFind(s, c) == i
  {
  }

  /** Some character strictly between indices `lo` and `hi` of `p` is not a dot. */
  ghost predicate NonDotBetween(p: string, lo: int, hi: int) {
    exists k :: lo < k < hi && 0 <= k < |p| && p[k] != '.'
  }

  /** `Extension` in terms of the characters between the last `/` and the
      last dot: there is an extension exactly when the dot comes later and
      something other than a dot lies between the two. */
  lemma ExtensionByIndices(p: string)
    ensures var sep := RFind(p, '/'); var dot := RFind(p, '.');
      Extension(p) == if sep < dot && NonDotBetween(p, sep, dot) then p[dot..] else []
  {
    var sep := RFind(p, '/');
    var dot := RFind(p, '.');
    if sep < dot && NonDotBetween(p, sep, dot) {
      var k :| sep < k < dot && 0 <= k < |p| && p[k] != '.';
      FirstOtherAtMost(p, '.', sep + 1, k);
    } else if sep < dot {
      FirstOtherAtLeast(p, '.', sep + 1, dot);
    }
  }

  /** The first non-`c` from `i` comes no later than a known non-`c` at `k`. */
  lemma FirstOtherAtMost(s: string, c: char, i: nat, k: int)
    requires i <= k < |s| && s[k] != c
    ensures FirstOtherFrom(s, c, i) <= k
  {
  }

  /** The first non-`c` from `i` comes no earlier than the end of a run of `c`. */
  lemma FirstOtherAtLeast(s: string, c: char, i: nat, m: int)
    requires i <= m <= |s|
    requires forall k :: i <= k < m ==> s[k] == c
    ensures FirstOtherFrom(s, c, i) >= m
  {
  }

  /** Cutting a string and gluing the halves gives it back. */
  lemma SplitAt(s: string, i: int)
    requires 0 <= i <= |s|
    ensures s[..i] + s[i..] == s
  {
  }

  /** `posixpath.splitext`, step by step as the library writes it: find the
      last separator and the last dot; when the dot comes later, walk from
      the last component's start towards it and split at the dot on meeting
      the first character that is not a dot; otherwise there is no extension. */
  method SplitExt(p: string) returns (root: string, ext: string)
    ensures root + ext == p
    ensures ext == Extension(p)
  {
    var sepIndex := RFind(p, '/');
    var dotIndex := RFind(p, '.');
    if dotIndex > sepIndex {
      var filenameIndex := sepIndex + 1;
      while filenameIndex < dotIndex
        invariant sepIndex + 1 <= filenameIndex <= dotIndex
        invariant forall k :: sepIndex < k < filenameIndex ==> p[k] == '.'
      {
        if p[filenameIndex] != '.' {
          FirstOtherAtLeast(p, '.', sepIndex + 1, filenameIndex);
          SplitAt(p, dotIndex);
          return p[..dotIndex], p[dotIndex..];
        }
        filenameIndex := filenameIndex + 1;
      }
      FirstOtherAtLeast(p, '.', sepIndex + 1, dotIndex);
    }
    return p, [];
  }
}
