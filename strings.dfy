/** The one string primitive the filter uses: Go's `strings.LastIndex` with a
    one-character separator. Go strings are byte sequences; here a string is a
    `seq<char>`, which gives the same cut because ':' is a single byte in UTF-8
    and never occurs inside a multi-byte sequence. */
module Strings {

  /** Index of the last occurrence of `c` in `s`, or -1 when `c` does not occur. */
  function LastIndex(s: string, c: char): (r: int)
    ensures -1 <= r < |s|
    ensures r == -1 <==> c !in s
    ensures 0 <= r ==> s[r] == c && c !in s[r + 1..]
    decreases |s|
  {
    if |s| == 0 then -1
    else if s[|s| - 1] == c then |s| - 1
    else
      var init := s[..|s| - 1];
      assert s == init + [s[|s| - 1]];
      var r := LastIndex(init, c);
      assert 0 <= r ==> s[r + 1..] == init[r + 1..] + [s[|s| - 1]];
      r
  }
}
