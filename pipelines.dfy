/**
 * Sections 3.5 and 3.6: the two three-stage pipelines
 * DISASSEMBLE -> COPY -> ASSEMBLE (Reformat) and
 * DISASSEMBLE -> SQUASH_EX -> ASSEMBLE (Conway's problem).
 *
 * In the Go code the first two stages run as goroutines joined by
 * unbuffered channels, and the caller runs ASSEMBLE. Every channel carries
 * its values in send order and is closed once by its only sender, so the
 * lines printed are those obtained by running the stages one after the
 * other on the finite streams.
 */
module Pipelines {
  import opened Runes
  import opened CopyProcess
  import opened SquashProcess
  import opened DisassembleProcess
  import opened AssembleProcess

  /** `S35_Reformat`: the card file reprinted at 125 runes per line. */
  method Reformat(cardfile: seq<seq<char>>) returns (lineprinter: seq<seq<char>>)
    ensures lineprinter == Assembled(Disassembled(cardfile))
  {
    var west := Disassemble(cardfile);
    var east := Copy(west);
    lineprinter := Assemble(east);
  }

  /** `S36_ConwayProblem`: as Reformat, with every "**" squashed to "↑". */
  method ConwayProblem(cardfile: seq<seq<char>>) returns (lineprinter: seq<seq<char>>)
    ensures lineprinter == Assembled(Squashed(Disassembled(cardfile), Lenient))
  {
    var west := Disassemble(cardfile);
    var east := SquashEx(west);
    lineprinter := Assemble(east);
  }

  /**
   * Read line after line, Reformat prints each card's first 80 runes and a
   * space, card after card, then spaces up to the end of the last line.
   */
  lemma ReformatStream(cards: seq<seq<char>>)
    ensures var d := Disassembled(cards);
            Flatten(Assembled(d)) == d + Spaces(PadLength(|d|))
  {
    AssembledFlatten(Disassembled(cards));
  }

  /**
   * When the cards and their separators fill whole lines, the lines read
   * one after the other give back exactly the disassembled stream.
   */
  lemma ReformatRoundTrip(cards: seq<seq<char>>)
    requires |Disassembled(cards)| % LineWidth == 0
    ensures Flatten(Assembled(Disassembled(cards))) == Disassembled(cards)
  {
    AssembledWholeLines(Disassembled(cards));
  }

  /** One card of 80 runes gives one line: the card, then 45 spaces. */
  lemma ReformatOneCard(card: seq<char>)
    requires |card| == CardWidth
    ensures Assembled(Disassembled([card])) == [card + Spaces(45)]
  {
    DisassembledOne(card);
    var d := Disassembled([card]);
    assert d == card + [Space];
    assert d + Spaces(LineWidth - |d|) == card + Spaces(45);
  }

  /** A stream sent by DISASSEMBLE holds an asterisk only if some card does. */
  lemma DisassembledMarkerFree(cards: seq<seq<char>>)
    requires forall k :: 0 <= k < |cards| ==> Asterisk !in cards[k]
    ensures Asterisk !in Disassembled(cards)
  {
    if Asterisk in Disassembled(cards) {
      DisassembledRunes(cards, Asterisk);
    }
  }

  /** Without asterisks on the cards, Conway's pipeline prints what Reformat prints. */
  lemma ConwayWithoutMarkers(cards: seq<seq<char>>)
    requires forall k :: 0 <= k < |cards| ==> Asterisk !in cards[k]
    ensures Assembled(Squashed(Disassembled(cards), Lenient)) == Assembled(Disassembled(cards))
  {
    DisassembledMarkerFree(cards);
    SquashMarkerFree(Disassembled(cards), Lenient);
  }

  /** Nothing Conway's pipeline prints holds "**", not even across a line break. */
  lemma ConwayNoAdjacentMarkers(cards: seq<seq<char>>)
    ensures NoAdjacentMarkers(Flatten(Assembled(Squashed(Disassembled(cards), Lenient))))
  {
    var q := Squashed(Disassembled(cards), Lenient);
    var pad := Spaces(PadLength(|q|));
    SquashNoAdjacentMarkers(Disassembled(cards), Lenient);
    AssembledFlatten(q);
    assert NoAdjacentMarkers(pad);
    NoAdjacentMarkersJoin(q, pad);
  }
}
