/**
 * Section 3.3, DISASSEMBLE: read cards from `cardfile` and send the runes
 * they contain to `X`, with one extra space after each card.
 */
module DisassembleProcess {
  import opened Runes

  /** The runes of one card that are sent: the card cut to its first 80. */
  function Kept(card: seq<char>): (r: seq<char>)
    ensures |r| == if |card| > CardWidth then CardWidth else |card|
    ensures r == card[..|r|]
  {
    if |card| > CardWidth then card[..CardWidth] else card[..|card|]
  }

  /** The stream DISASSEMBLE sends for a whole card file. */
  function Disassembled(cards: seq<seq<char>>): seq<char>
  {
    if cards == [] then []
    else Disassembled(cards[..|cards| - 1]) + Kept(cards[|cards| - 1]) + [Space]
  }

  /**
   * `S33_DISASSEMBLE`. `cardimage` is the reused buffer: each card's kept
   * runes are appended to it, sent one by one, and the buffer is cut back
   * to length zero, so it is empty whenever the next card arrives.
   */
  method Disassemble(cardfile: seq<seq<char>>) returns (x: seq<char>)
    ensures x == Disassembled(cardfile)
  {
    var cardimage: seq<char> := [];  // make([]rune, 0, 80)
    x := [];
    var n := 0;  // cards received so far
    while n < |cardfile|
      invariant 0 <= n <= |cardfile|
      invariant cardimage == []
      invariant x == Disassembled(cardfile[..n])
    {
      var tmp := cardfile[n];
      if |tmp| > CardWidth {
        cardimage := cardimage + tmp[..CardWidth];
      } else {
        cardimage := cardimage + tmp[..|tmp|];
      }
      ghost var done := x;
      var i := 0;
      while i < |cardimage|
        invariant 0 <= i <= |cardimage|
        invariant x == done + cardimage[..i]
      {
        SendNext(done, cardimage, i);
        x := x + [cardimage[i]];
        i := i + 1;
      }
      assert cardimage[..i] == Kept(tmp);
      x := x + [Space];
      cardimage := cardimage[..0];
      DisassembledPrefix(cardfile, n);
      n := n + 1;
    }
    assert cardfile[..n] == cardfile;
  }

  /** Sending the next rune of the buffer extends the sent prefix by one. */
  lemma SendNext(done: seq<char>, buffer: seq<char>, i: nat)
    requires i < |buffer|
    ensures done + buffer[..i] + [buffer[i]] == done + buffer[..i + 1]
  {
    assert buffer[..i] + [buffer[i]] == buffer[..i + 1];
  }

  /** Receiving one more card extends the stream by that card's segment. */
  lemma DisassembledPrefix(cards: seq<seq<char>>, n: nat)
    requires n < |cards|
    ensures Disassembled(cards[..n + 1]) == Disassembled(cards[..n]) + Kept(cards[n]) + [Space]
  {
    assert cards[..n + 1][..n] == cards[..n];
  }

  /** Sum over the cards of the runes kept plus one separator. */
  function Width(cards: seq<seq<char>>): nat
  {
    if cards == [] then 0
    else Width(cards[..|cards| - 1]) + |Kept(cards[|cards| - 1])| + 1
  }

  /** The stream is as long as the kept runes plus one space per card. */
  lemma {:induction false} DisassembledLength(cards: seq<seq<char>>)
    ensures |Disassembled(cards)| == Width(cards)
    ensures |Disassembled(cards)| >= |cards|
    decreases |cards|
  {
    if cards != [] {
      DisassembledLength(cards[..|cards| - 1]);
    }
  }

  /** Cards of at least 80 runes each give 81 runes per card. */
  lemma {:induction false} DisassembledFullCards(cards: seq<seq<char>>)
    requires forall k :: 0 <= k < |cards| ==> |cards[k]| >= CardWidth
    ensures |Disassembled(cards)| == (CardWidth + 1) * |cards|
    decreases |cards|
  {
    if cards != [] {
      DisassembledFullCards(cards[..|cards| - 1]);
    }
  }

  /** Disassembling two card files one after the other concatenates their streams. */
  lemma {:induction false} DisassembledAppend(a: seq<seq<char>>, b: seq<seq<char>>)
    ensures Disassembled(a + b) == Disassembled(a) + Disassembled(b)
    decreases |b|
  {
    if b == [] {
      assert a + b == a;
    } else {
      var b', card := b[..|b| - 1], b[|b| - 1];
      assert (a + b)[..|a + b| - 1] == a + b' && (a + b)[|a + b| - 1] == card;
      DisassembledAppend(a, b');
      var x, y, z := Disassembled(a), Disassembled(b'), Kept(card) + [Space];
      assert Disassembled(a + b) == x + y + z;
      assert x + y + z == x + (y + z);
    }
  }

  /**
   * A card contributes exactly its kept runes and one space, between the
   * streams of the cards before it and after it: no rune of one card
   * appears in the segment of another.
   */
  lemma DisassembledCard(before: seq<seq<char>>, card: seq<char>, after: seq<seq<char>>)
    ensures Disassembled(before + [card] + after)
            == Disassembled(before) + Kept(card) + [Space] + Disassembled(after)
  {
    DisassembledAppend(before + [card], after);
    DisassembledAppend(before, [card]);
    DisassembledOne(card);
    var d1, d2 := Disassembled(before), Disassembled(after);
    assert (d1 + (Kept(card) + [Space])) + d2 == d1 + Kept(card) + [Space] + d2;
  }

  /** A single card gives its kept runes and one space. */
  lemma DisassembledOne(card: seq<char>)
    ensures Disassembled([card]) == Kept(card) + [Space]
  {
    assert [card][..0] == [];
  }

  /** Every rune sent other than a space comes from the kept runes of some card. */
  lemma {:induction false} DisassembledRunes(cards: seq<seq<char>>, c: char)
    requires c != Space && c in Disassembled(cards)
    ensures exists k :: 0 <= k < |cards| && c in Kept(cards[k])
    decreases |cards|
  {
    var n := |cards|;
    var rest := cards[..n - 1];
    if c in Disassembled(rest) {
      DisassembledRunes(rest, c);
      var k :| 0 <= k < |rest| && c in Kept(rest[k]);
      assert cards[k] == rest[k];
    } else {
      assert c in Kept(cards[n - 1]);
    }
  }
}
