/** Runs of blanks, as printers of lines and header fields write them. */
module Strings {
  function Blanks(n: nat): (s: string)
    ensures |s| == n && forall k :: 0 <= k < n ==> s[k] == ' '
  {
    seq(n, _ => ' ')
  }
}
