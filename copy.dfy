/**
 * Section 3.1, COPY: relay every rune received from `west` to `east`,
 * then close `east`.
 */
module CopyProcess {

  /**
   * `for c := range west { east <- c }; close(east)`: the runes sent on
   * `east` are those received from `west`, one for one and in order.
   */
  method Copy(west: seq<char>) returns (east: seq<char>)
    ensures east == west
  {
    east := [];
    var i := 0;
    while i < |west|
      invariant 0 <= i <= |west|
      invariant east == west[..i]
    {
      east := east + [west[i]];
      i := i + 1;
    }
  }
}
