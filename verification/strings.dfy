/** Small string helpers shared by the query preprocessor and the tk index parser. */
module Strings {

  /** Index of the first `c` in `s`, or `|s|` when there is none
      (Python's `str.find`, with "not found" as `|s|`). */
  function IndexOf(s: string, c: char): (k: nat)
    ensures k <= |s|
    ensures k < |s| ==> s[k] == c
    ensures forall i :: 0 <= i < k ==> s[i] != c
  {
    if |s| == 0 then 0
    else if s[0] == c then 0
    else 1 + IndexOf(s[1..], c)
  }
}
