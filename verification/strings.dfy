/** The two string operations the upload handler applies to a file name:
    lower-casing and splitting once at the last occurrence of a separator.
    File names reach them already sanitised to ASCII, so lower-casing is the
    ASCII one. */
module Strings {

  /** Lower-casing of a single ASCII character; every other character is kept. */
  function LowerChar(c: char): (r: char)
    ensures 'A' <= c <= 'Z' ==> 'a' <= r <= 'z' && r as int == c as int + 32
    ensures !('A' <= c <= 'Z') ==> r == c
  {
    if 'A' <= c <= 'Z' then (c as int + 32) as char else c
  }

  /** `s.lower()` on an ASCII string. */
  function Lower(s: string): (r: string)
    ensures |r| == |s|
    ensures forall i :: 0 <= i < |s| ==> r[i] == LowerChar(s[i])
  {
    if s == [] then [] else [LowerChar(s[0])] + Lower(s[1..])
  }

  /** Lower-casing twice is lower-casing once. */
  lemma LowerIdempotent(s: string)
    ensures Lower(Lower(s)) == Lower(s)
  {
  }

  /** Lower-casing never produces or removes the separator `c` when `c` is
      not an upper-case letter. */
  lemma LowerKeepsSeparator(s: string, c: char)
    requires !('A' <= c <= 'Z') && !('a' <= c <= 'z')
    ensures c in Lower(s) <==> c in s
  {
  }

  /** `s.rsplit(sep, 1)` for a one-character separator: one part (the whole
      string) when `sep` does not occur, otherwise the text before and the
      text after the LAST occurrence of `sep`. */
  function RSplitOnce(s: string, sep: char): (r: seq<string>)
    ensures sep in s <==> |r| == 2
    ensures sep !in s ==> r == [s]
    ensures |r| == 2 ==> s == r[0] + [sep] + r[1] && sep !in r[1]
  {
    if s == [] then [s]
    else if s[|s| - 1] == sep then [s[..|s| - 1], []]
    else
      var parts := RSplitOnce(s[..|s| - 1], sep);
      assert s == s[..|s| - 1] + [s[|s| - 1]];
      if |parts| == 1 then [s] else [parts[0], parts[1] + [s[|s| - 1]]]
  }

  /** A string splits in at most one way at a LAST occurrence of `sep`. */
  lemma SplitAtLastUnique(head: string, tail: string, head': string, tail': string, sep: char)
    requires head + [sep] + tail == head' + [sep] + tail'
    requires sep !in tail && sep !in tail'
    ensures head == head' && tail == tail'
  {
    var s := head + [sep] + tail;
    assert forall i :: |head| < i < |s| ==> s[i] == tail[i - |head| - 1];
    assert forall i :: |head'| < i < |s| ==> s[i] == tail'[i - |head'| - 1];
    assert s[|head|] == sep && s[|head'|] == sep;
    assert |head| == |head'|;
    assert head == s[..|head|] == head';
    assert tail == s[|head| + 1..] == tail';
  }

  /** Splitting at the last separator undoes gluing two strings with it,
      provided the second one does not contain the separator. */
  lemma RSplitOnceOfJoin(head: string, sep: char, tail: string)
    requires sep !in tail
    ensures RSplitOnce(head + [sep] + tail, sep) == [head, tail]
  {
    var s := head + [sep] + tail;
    assert s[|head|] == sep;
    var r := RSplitOnce(s, sep);
    SplitAtLastUnique(head, tail, r[0], r[1], sep);
  }
}
