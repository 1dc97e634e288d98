/** String operations on filesystem paths that both commands rely on:
    PHP's `str_replace(needle, '', s)`, `str_starts_with` and
    `rtrim(s, DIRECTORY_SEPARATOR)`, with `/` as the directory separator. */
module Paths {

  /** `DIRECTORY_SEPARATOR` on the platforms the module runs on. */
  const Separator: char := '/'

  /** `str_starts_with(s, prefix)`: `prefix` is no longer than `s` and agrees
      with it character by character. */
  predicate StartsWith(s: string, prefix: string): (b: bool)
    ensures b <==> |prefix| <= |s| && forall i | 0 <= i < |prefix| :: s[i] == prefix[i]
  {
    |prefix| <= |s| && s[..|prefix|] == prefix
  }

  /** `needle` occurs somewhere inside `s` (the empty needle occurs everywhere). */
  predicate Occurs(needle: string, s: string) {
    exists i | 0 <= i <= |s| :: StartsWith(s[i..], needle)
  }

  /** `str_replace(needle, '', s)`: every occurrence of `needle`, found left to
      right and without overlap, is removed; an empty needle leaves `s` alone. */
  function StripAll(s: string, needle: string): (r: string)
    ensures |r| <= |s|
    ensures needle == [] ==> r == s
    decreases |s|
  {
    if needle == [] || s == [] then s
    else if StartsWith(s, needle) then StripAll(s[|needle|..], needle)
    else [s[0]] + StripAll(s[1..], needle)
  }

  /** A string shorter than the needle cannot contain it. */
  lemma ShortHasNoOccurrence(needle: string, s: string)
    requires |s| < |needle|
    ensures !Occurs(needle, s)
  {
  }

  /** Without an occurrence of the needle, `str_replace` changes nothing. */
  lemma {:induction false} StripAllWithoutOccurrence(s: string, needle: string)
    requires !Occurs(needle, s)
    ensures StripAll(s, needle) == s
    decreases |s|
  {
    if needle == [] || s == [] {
    } else {
      assert s[0..] == s;
      assert !StartsWith(s, needle);
      forall i | 0 <= i <= |s[1..]|
        ensures !StartsWith(s[1..][i..], needle)
      {
        assert s[1..][i..] == s[i + 1..];
      }
      StripAllWithoutOccurrence(s[1..], needle);
    }
  }

  /** A first character at which no occurrence starts is kept. */
  lemma StripKeepsUnmatchedFirst(s: string, needle: string)
    requires needle != [] && s != [] && !StartsWith(s, needle)
    ensures StripAll(s, needle) == [s[0]] + StripAll(s[1..], needle)
  {
  }

  /** A leading needle is removed and stripping continues after it. */
  lemma StripAfterLeadingNeedle(needle: string, rest: string)
    requires needle != []
    ensures StripAll(needle + rest, needle) == StripAll(rest, needle)
  {
    assert StartsWith(needle + rest, needle);
    assert (needle + rest)[|needle|..] == rest;
  }

  /** Removing a leading needle: when `s` is the needle followed by a suffix in
      which the needle does not occur again, the result is exactly that suffix. */
  lemma StripLeadingNeedle(needle: string, suffix: string)
    requires needle != []
    requires !Occurs(needle, suffix)
    ensures StripAll(needle + suffix, needle) == suffix
  {
    StripAfterLeadingNeedle(needle, suffix);
    StripAllWithoutOccurrence(suffix, needle);
  }

  /** `rtrim(s, DIRECTORY_SEPARATOR)`: drops every trailing separator. */
  function TrimTrailingSeparators(s: string): (r: string)
    ensures StartsWith(s, r)
    ensures r == [] || r[|r| - 1] != Separator
    ensures forall i | |r| <= i < |s| :: s[i] == Separator
    decreases |s|
  {
    if s != [] && s[|s| - 1] == Separator then TrimTrailingSeparators(s[..|s| - 1])
    else s
  }

  /** Trimming twice is trimming once, and extra trailing separators do not
      change the trimmed path. */
  lemma TrimIdempotent(s: string)
    ensures TrimTrailingSeparators(TrimTrailingSeparators(s)) == TrimTrailingSeparators(s)
    ensures TrimTrailingSeparators(s + [Separator]) == TrimTrailingSeparators(s)
  {
  }
}
