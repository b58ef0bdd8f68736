/**
 * Values shared by the stream processes of Hoare's "Communicating Sequential
 * Processes" (1978), sections 3.1-3.6: the configured constants and a few
 * small functions on rune sequences.
 *
 * A Go `rune` is modelled as a Dafny `char`. A channel that is run to
 * `close` is modelled as the finite sequence of values sent on it before
 * it was closed.
 */
module Runes {

  /** The marker that SQUASH pairs up. */
  const Asterisk: char := '*'
  /** What SQUASH emits for a pair of markers. */
  const UpArrow: char := '↑'
  /** Separator after each card, and fill for the last line. */
  const Space: char := ' '
  /** Runes of a card that DISASSEMBLE keeps. */
  const CardWidth: nat := 80
  /** Runes per line printed by ASSEMBLE. */
  const LineWidth: nat := 125

  /** `n` spaces. */
  function Spaces(n: nat): (r: seq<char>)
    ensures |r| == n
    ensures forall k :: 0 <= k < n ==> r[k] == Space
  {
    seq(n, _ => Space)
  }

}
