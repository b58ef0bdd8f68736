/**
 * Section 3.4, ASSEMBLE: read runes from `X` and send them to
 * `lineprinter` in lines of 125; the last line is completed with spaces.
 */
module AssembleProcess {
  import opened Runes

  /**
   * The lines ASSEMBLE sends for a whole input stream: consecutive
   * 125-rune slices, the last one padded with spaces; no line at all for
   * an empty stream.
   */
  function Assembled(s: seq<char>): seq<seq<char>>
    decreases |s|
  {
    if s == [] then []
    else if |s| < LineWidth then [s + Spaces(LineWidth - |s|)]
    else [s[..LineWidth]] + Assembled(s[LineWidth..])
  }

  /** The runes of all lines, one line after the other. */
  function Flatten(lines: seq<seq<char>>): seq<char>
  {
    if lines == [] then [] else lines[0] + Flatten(lines[1..])
  }

  /** Spaces needed to bring a stream of `n` runes to a multiple of 125. */
  function PadLength(n: nat): (k: nat)
    ensures k < LineWidth && (n + k) % LineWidth == 0
  {
    (LineWidth - n % LineWidth) % LineWidth
  }

  /**
   * `S34_ASSEMBLE`. `lineimage` is the fixed 125-slot buffer and `i` the
   * next free slot. A rune is stored at slot `i`; when that was the last
   * slot the full line is sent and `i` starts again at 0. When `X` closes
   * with a partial line, the free slots are filled with spaces and that
   * line is sent too.
   */
  method Assemble(x: seq<char>) returns (lineprinter: seq<seq<char>>)
    ensures lineprinter == Assembled(x)
  {
    var lineimage := new char[LineWidth](_ => '\0');  // make([]rune, 125)
    lineprinter := [];
    var i := 0;
    var k := 0;           // runes received from X so far
    ghost var start := 0; // runes received before the line being filled
    while k < |x|
      invariant 0 <= i < LineWidth
      invariant start + i == k <= |x|
      invariant start % LineWidth == 0
      invariant lineimage[..i] == x[start..k]
      invariant lineprinter == Assembled(x[..start])
    {
      var c := x[k];
      k := k + 1;
      lineimage[i] := c;
      assert lineimage[..i + 1] == x[start..k];
      if i <= LineWidth - 1 {
        i := i + 1;
      }
      if i == LineWidth {
        lineimage[i - 1] := c;
        assert lineimage[..] == lineimage[..i] == x[start..k];
        AssembledFlush(x, start, k);
        lineprinter := lineprinter + [lineimage[..]];
        i := 0;
        start := k;
      }
    }
    assert x[..k] == x;
    if i > 0 {
      var filled := i;
      while i <= LineWidth - 1
        invariant filled <= i <= LineWidth
        invariant lineimage[..filled] == x[start..]
        invariant forall j :: filled <= j < i ==> lineimage[j] == Space
      {
        lineimage[i] := Space;
        i := i + 1;
      }
      assert lineimage[..] == x[start..] + Spaces(LineWidth - filled);
      AssembledTail(x, start);
      lineprinter := lineprinter + [lineimage[..]];
    } else {
      assert x[..start] == x;
    }
  }

  /** Lines assembled from a whole number of lines followed by more runes. */
  lemma {:induction false} AssembledAppend(a: seq<char>, b: seq<char>)
    requires |a| % LineWidth == 0
    ensures Assembled(a + b) == Assembled(a) + Assembled(b)
    decreases |a|
  {
    if a == [] {
      assert a + b == b;
    } else {
      assert (a + b)[..LineWidth] == a[..LineWidth];
      assert (a + b)[LineWidth..] == a[LineWidth..] + b;
      AssembledAppend(a[LineWidth..], b);
    }
  }

  /** Appending one full line's worth of runes appends exactly that line. */
  lemma AssembledOneLine(a: seq<char>, line: seq<char>)
    requires |a| % LineWidth == 0 && |line| == LineWidth
    ensures Assembled(a + line) == Assembled(a) + [line]
  {
    AssembledAppend(a, line);
    assert line[..LineWidth] == line && line[LineWidth..] == [];
    assert Assembled(line) == [line] + Assembled([]);
  }

  /** A line filled at rune `k` is sent as the next line. */
  lemma AssembledFlush(x: seq<char>, start: nat, k: nat)
    requires start % LineWidth == 0 && start + LineWidth == k <= |x|
    ensures Assembled(x[..k]) == Assembled(x[..start]) + [x[start..k]]
  {
    AssembledOneLine(x[..start], x[start..k]);
    assert x[..start] + x[start..k] == x[..k];
  }

  /** The runes after the last full line are sent as one padded line. */
  lemma AssembledTail(x: seq<char>, start: nat)
    requires start % LineWidth == 0 && start < |x| < start + LineWidth
    ensures Assembled(x) == Assembled(x[..start]) + [x[start..] + Spaces(LineWidth - (|x| - start))]
  {
    AssembledAppend(x[..start], x[start..]);
    assert x[..start] + x[start..] == x;
  }

  /**
   * Every line has exactly 125 runes and there are `ceil(|s| / 125)` of
   * them, so none for an empty stream.
   */
  lemma {:induction false} AssembledLines(s: seq<char>)
    ensures var lines := Assembled(s);
            && (forall j :: 0 <= j < |lines| ==> |lines[j]| == LineWidth)
            && |lines| * LineWidth == |s| + PadLength(|s|)
            && (s == [] <==> lines == [])
    decreases |s|
  {
    if s != [] && |s| >= LineWidth {
      AssembledLines(s[LineWidth..]);
    }
  }

  /**
   * Read one after the other, the lines give the input followed by spaces
   * up to the next multiple of 125.
   */
  lemma {:induction false} AssembledFlatten(s: seq<char>)
    ensures Flatten(Assembled(s)) == s + Spaces(PadLength(|s|))
    decreases |s|
  {
    if s == [] {
    } else if |s| < LineWidth {
      var line := s + Spaces(LineWidth - |s|);
      assert PadLength(|s|) == LineWidth - |s|;
      assert Flatten([line]) == line + Flatten([]);
    } else {
      var rest := s[LineWidth..];
      AssembledFlatten(rest);
      PadLengthShift(|rest|);
      assert s == s[..LineWidth] + rest;
    }
  }

  lemma PadLengthShift(n: nat)
    ensures PadLength(n + LineWidth) == PadLength(n)
  {
    assert (n + LineWidth) % LineWidth == n % LineWidth;
  }

  /**
   * Line `j` of a stream long enough to fill it is the input slice
   * `[125 * j, 125 * (j + 1))`, unpadded; in particular it ends with the
   * rune whose arrival filled it.
   */
  lemma {:induction false} AssembledFullLine(s: seq<char>, j: nat)
    requires LineWidth * (j + 1) <= |s|
    ensures j < |Assembled(s)|
    ensures Assembled(s)[j] == s[LineWidth * j .. LineWidth * (j + 1)]
    ensures Assembled(s)[j][LineWidth - 1] == s[LineWidth * (j + 1) - 1]
    decreases j
  {
    var rest := s[LineWidth..];
    if j > 0 {
      AssembledFullLine(rest, j - 1);
      assert rest[LineWidth * (j - 1) .. LineWidth * j] == s[LineWidth * j .. LineWidth * (j + 1)];
    }
  }

  /** A stream that fills whole lines comes back unchanged, with no padding. */
  lemma AssembledWholeLines(s: seq<char>)
    requires |s| % LineWidth == 0
    ensures Flatten(Assembled(s)) == s
  {
    var pad := PadLength(|s|);
    assert pad == 0 by {
      assert |s| % LineWidth == 0;
    }
    AssembledFlatten(s);
    assert Spaces(pad) == [];
  }

  /**
   * 125 runes give one line, equal to them; 130 runes give that line and a
   * second one of 5 runes and 120 spaces.
   */
  lemma AssembledExamples(s: seq<char>)
    ensures |s| == LineWidth ==> Assembled(s) == [s]
    ensures |s| == LineWidth + 5 ==> Assembled(s) == [s[..LineWidth], s[LineWidth..] + Spaces(120)]
  {
    if |s| == LineWidth {
      assert s[..LineWidth] == s && s[LineWidth..] == [];
    } else if |s| == LineWidth + 5 {
      assert Assembled(s[LineWidth..]) == [s[LineWidth..] + Spaces(120)];
    }
  }
}
