/**
 * Section 3.2, SQUASH: copy runes from `west` to `east`, replacing every
 * pair of consecutive asterisks "**" by an upward arrow "↑".
 *
 * The process reads one rune of look-ahead after each asterisk. The two Go
 * variants differ only when the input ends right after an asterisk that
 * has not been paired: `S32_SQUASH` drops it, `S32_SQUASH_EX` emits it.
 */
module SquashProcess {
  import opened Runes

  /** What happens to an unpaired asterisk at the end of the stream. */
  datatype Policy = Strict | Lenient

  /**
   * The stream SQUASH sends, as a function of the whole input: left to
   * right, "**" becomes "↑", "*x" with x not an asterisk stays "*x", and a
   * final lone "*" is kept under `Lenient` and dropped under `Strict`.
   * Squashing never makes a stream longer.
   */
  function Squashed(s: seq<char>, p: Policy): (r: seq<char>)
    ensures |r| <= |s|
    decreases |s|
  {
    if s == [] then []
    else if s[0] != Asterisk then [s[0]] + Squashed(s[1..], p)
    else if |s| == 1 then (if p == Lenient then [Asterisk] else [])
    else if s[1] != Asterisk then [Asterisk, s[1]] + Squashed(s[2..], p)
    else [UpArrow] + Squashed(s[2..], p)
  }

  /**
   * `S32_SQUASH`: the strict variant. When the look-ahead receive after an
   * asterisk finds `west` closed, the loop ends and the asterisk is lost.
   */
  method Squash(west: seq<char>) returns (east: seq<char>)
    ensures east == Squashed(west, Strict)
  {
    east := [];
    var i := 0;  // runes received from west so far
    while true
      invariant 0 <= i <= |west|
      invariant east + Squashed(west[i..], Strict) == Squashed(west, Strict)
      decreases |west| - i
    {
      if i == |west| {  // c, ok := <-west; !ok
        SquashedEnd(west, east, Strict);
        break;
      }
      ghost var sent := east;
      var c := west[i];
      i := i + 1;
      if c != Asterisk {
        SquashedRuneStep(west, i - 1, Strict);
        east := east + [c];
        SquashedAdvance(west, i - 1, i, sent, [c], Strict);
      }
      if c == Asterisk {
        if i == |west| {  // c, ok = <-west; !ok
          SquashedLastStep(west, i - 1, Strict);
          assert east + [] == east;
          break;
        }
        SquashedPairStep(west, i - 1, Strict);
        c := west[i];
        i := i + 1;
        if c != Asterisk {
          east := east + [Asterisk];
          east := east + [c];
          SquashedAdvancePair(west, i - 2, i, sent, c, Strict);
        }
        if c == Asterisk {
          east := east + [UpArrow];
          SquashedAdvance(west, i - 2, i, sent, [UpArrow], Strict);
        }
      }
    }
  }

  /**
   * `S32_SQUASH_EX`: the lenient variant. When the look-ahead receive
   * after an asterisk finds `west` closed, that asterisk is sent before
   * the loop ends.
   */
  method SquashEx(west: seq<char>) returns (east: seq<char>)
    ensures east == Squashed(west, Lenient)
  {
    east := [];
    var i := 0;  // runes received from west so far
    while true
      invariant 0 <= i <= |west|
      invariant east + Squashed(west[i..], Lenient) == Squashed(west, Lenient)
      decreases |west| - i
    {
      if i == |west| {  // c, ok := <-west; !ok
        SquashedEnd(west, east, Lenient);
        break;
      }
      ghost var sent := east;
      var c := west[i];
      i := i + 1;
      if c != Asterisk {
        SquashedRuneStep(west, i - 1, Lenient);
        east := east + [c];
        SquashedAdvance(west, i - 1, i, sent, [c], Lenient);
      }
      if c == Asterisk {
        if i == |west| {  // c, ok = <-west; !ok
          SquashedLastStep(west, i - 1, Lenient);
          east := east + [Asterisk];
          break;
        }
        SquashedPairStep(west, i - 1, Lenient);
        c := west[i];
        i := i + 1;
        if c != Asterisk {
          east := east + [Asterisk];
          east := east + [c];
          SquashedAdvancePair(west, i - 2, i, sent, c, Lenient);
        }
        if c == Asterisk {
          east := east + [UpArrow];
          SquashedAdvance(west, i - 2, i, sent, [UpArrow], Lenient);
        }
      }
    }
  }

  /** Once the whole input is received, what has been sent is the output. */
  lemma SquashedEnd(s: seq<char>, sent: seq<char>, p: Policy)
    requires sent + Squashed(s[|s|..], p) == Squashed(s, p)
    ensures sent == Squashed(s, p)
  {
    assert s[|s|..] == [];
    assert sent + [] == sent;
  }

  /** A rune other than an asterisk is sent as it is. */
  lemma SquashedRuneStep(s: seq<char>, i: nat, p: Policy)
    requires i < |s| && s[i] != Asterisk
    ensures Squashed(s[i..], p) == [s[i]] + Squashed(s[i + 1..], p)
  {
    assert s[i..][1..] == s[i + 1..];
  }

  /** An asterisk that ends the input is kept only under `Lenient`. */
  lemma SquashedLastStep(s: seq<char>, i: nat, p: Policy)
    requires i + 1 == |s| && s[i] == Asterisk
    ensures Squashed(s[i..], p) == if p == Lenient then [Asterisk] else []
  {
    assert s[i..] == [Asterisk];
  }

  /** An asterisk with a rune after it: "**" gives "↑", "*x" gives "*x". */
  lemma SquashedPairStep(s: seq<char>, i: nat, p: Policy)
    requires i + 1 < |s| && s[i] == Asterisk
    ensures Squashed(s[i..], p)
            == (if s[i + 1] == Asterisk then [UpArrow] else [Asterisk] + [s[i + 1]])
               + Squashed(s[i + 2..], p)
  {
    assert s[i..][2..] == s[i + 2..];
    assert [Asterisk] + [s[i + 1]] == [Asterisk, s[i + 1]];
  }

  /** Sending the output of one step keeps the loop invariant of SQUASH. */
  lemma SquashedAdvance(s: seq<char>, i: nat, j: nat, sent: seq<char>, h: seq<char>, p: Policy)
    requires i <= j <= |s|
    requires sent + Squashed(s[i..], p) == Squashed(s, p)
    requires Squashed(s[i..], p) == h + Squashed(s[j..], p)
    ensures sent + h + Squashed(s[j..], p) == Squashed(s, p)
  {
    var rest := Squashed(s[j..], p);
    assert sent + (h + rest) == sent + h + rest;
  }

  /** The same, when the step sends an asterisk and then the rune `c`. */
  lemma SquashedAdvancePair(s: seq<char>, i: nat, j: nat, sent: seq<char>, c: char, p: Policy)
    requires i <= j <= |s|
    requires sent + Squashed(s[i..], p) == Squashed(s, p)
    requires Squashed(s[i..], p) == [Asterisk] + [c] + Squashed(s[j..], p)
    ensures sent + [Asterisk] + [c] + Squashed(s[j..], p) == Squashed(s, p)
  {
    var rest := Squashed(s[j..], p);
    assert sent + ([Asterisk] + [c] + rest) == sent + [Asterisk] + [c] + rest;
  }

  // ---------------------------------------------------------------------
  // Streams without asterisks

  /** Under either policy, a stream with no asterisk passes unchanged. */
  lemma {:induction false} SquashMarkerFree(s: seq<char>, p: Policy)
    requires Asterisk !in s
    ensures Squashed(s, p) == s
    decreases |s|
  {
    if s != [] {
      assert s == [s[0]] + s[1..];
      SquashMarkerFree(s[1..], p);
    }
  }

  // ---------------------------------------------------------------------
  // Runs of asterisks

  /** `n` asterisks. */
  function Markers(n: nat): (r: seq<char>)
    ensures |r| == n
  {
    seq(n, _ => Asterisk)
  }

  /** `n` upward arrows. */
  function Arrows(n: nat): (r: seq<char>)
    ensures |r| == n
  {
    seq(n, _ => UpArrow)
  }

  /** `2 * m` asterisks in front of any stream become `m` arrows. */
  lemma {:induction false} SquashPairs(m: nat, u: seq<char>, p: Policy)
    ensures Squashed(Markers(2 * m) + u, p) == Arrows(m) + Squashed(u, p)
    decreases m
  {
    if m > 0 {
      var rest := Markers(2 * (m - 1)) + u;
      assert Markers(2 * m) + u == [Asterisk, Asterisk] + rest;
      SquashPairHead(rest, p);
      SquashPairs(m - 1, u, p);
      assert [UpArrow] + (Arrows(m - 1) + Squashed(u, p)) == Arrows(m) + Squashed(u, p);
    } else {
      assert Markers(0) + u == u;
    }
  }

  /**
   * A maximal run of `n` asterisks becomes `n / 2` arrows; when `n` is odd
   * the last asterisk of the run is kept, unless the stream ends there and
   * the policy is strict. What follows the run is squashed on its own.
   */
  lemma SquashRun(n: nat, t: seq<char>, p: Policy)
    requires t == [] || t[0] != Asterisk
    ensures Squashed(Markers(n) + t, p)
            == Arrows(n / 2)
               + ((if n % 2 == 1 && (t != [] || p == Lenient) then [Asterisk] else [])
                  + Squashed(t, p))
  {
    var m, r := n / 2, n % 2;
    var u := Markers(r) + t;
    MarkersSplit(2 * m, r, t);
    SquashPairs(m, u, p);
    if r == 1 {
      assert u == [Asterisk] + t;
      SquashLoneHead(t, p);
    } else {
      assert u == t;
    }
  }

  /**
   * SQUASH works separately on the two sides of a seam that follows a rune
   * other than an asterisk: no pair straddles it.
   */
  lemma {:induction false} SquashedSplit(a: seq<char>, b: seq<char>, p: Policy)
    requires a == [] || a[|a| - 1] != Asterisk
    ensures Squashed(a + b, p) == Squashed(a, p) + Squashed(b, p)
    decreases |a|
  {
    if a == [] {
      assert a + b == b;
    } else {
      var k := if a[0] != Asterisk then 1 else 2;
      var h, u := a[..k], a[k..];
      assert a == h + u && a + b == h + u + b;
      SquashedSplit(u, b, p);
      SquashedSplitStep(h, u, b, p);
    }
  }

  /** One step of `SquashedSplit`: a head squashed on its own is put in front of both sides. */
  lemma SquashedSplitStep(h: seq<char>, u: seq<char>, b: seq<char>, p: Policy)
    requires (|h| == 1 && h[0] != Asterisk) || (|h| == 2 && h[0] == Asterisk)
    requires Squashed(u + b, p) == Squashed(u, p) + Squashed(b, p)
    ensures Squashed(h + u + b, p) == Squashed(h + u, p) + Squashed(b, p)
  {
    calc {
      Squashed(h + u + b, p);
      { assert h + u + b == h + (u + b); }
      Squashed(h + (u + b), p);
      { SquashHead(h, u + b, p); }
      HeadSquashed(h) + Squashed(u + b, p);
      HeadSquashed(h) + (Squashed(u, p) + Squashed(b, p));
      HeadSquashed(h) + Squashed(u, p) + Squashed(b, p);
      { SquashHead(h, u, p); }
      Squashed(h + u, p) + Squashed(b, p);
    }
  }

  /** What a head of one non-asterisk rune, or of an asterisk and one more rune, is squashed to. */
  function HeadSquashed(h: seq<char>): seq<char>
    requires (|h| == 1 && h[0] != Asterisk) || (|h| == 2 && h[0] == Asterisk)
  {
    if |h| == 2 && h[1] == Asterisk then [UpArrow] else h
  }

  /** Such a head is squashed on its own, whatever follows it. */
  lemma SquashHead(h: seq<char>, u: seq<char>, p: Policy)
    requires (|h| == 1 && h[0] != Asterisk) || (|h| == 2 && h[0] == Asterisk)
    ensures Squashed(h + u, p) == HeadSquashed(h) + Squashed(u, p)
  {
    var s := h + u;
    if |h| == 1 {
      assert s[0] == h[0] && s[1..] == u && h == [h[0]];
    } else {
      assert s[0] == h[0] && s[1] == h[1] && s[2..] == u && h == [h[0], h[1]];
    }
  }

  /**
   * The same for a maximal run anywhere in the stream: what comes before
   * the run is squashed on its own, the run becomes `n / 2` arrows and
   * possibly one asterisk, and what follows is squashed on its own.
   */
  lemma SquashRunWithin(a: seq<char>, n: nat, t: seq<char>, p: Policy)
    requires a == [] || a[|a| - 1] != Asterisk
    requires t == [] || t[0] != Asterisk
    ensures Squashed(a + Markers(n) + t, p)
            == Squashed(a, p) + Arrows(n / 2)
               + ((if n % 2 == 1 && (t != [] || p == Lenient) then [Asterisk] else [])
                  + Squashed(t, p))
  {
    assert a + Markers(n) + t == a + (Markers(n) + t);
    SquashedSplit(a, Markers(n) + t, p);
    SquashRun(n, t, p);
  }

  lemma MarkersSplit(a: nat, b: nat, t: seq<char>)
    ensures Markers(a + b) + t == Markers(a) + (Markers(b) + t)
  {
    assert Markers(a + b) == Markers(a) + Markers(b);
  }

  /** A leading pair of asterisks becomes one arrow. */
  lemma SquashPairHead(u: seq<char>, p: Policy)
    ensures Squashed([Asterisk, Asterisk] + u, p) == [UpArrow] + Squashed(u, p)
  {
    assert ([Asterisk, Asterisk] + u)[2..] == u;
  }

  /** A leading asterisk followed by no asterisk is kept, unless strict SQUASH finds nothing after it. */
  lemma SquashLoneHead(t: seq<char>, p: Policy)
    requires t == [] || t[0] != Asterisk
    ensures Squashed([Asterisk] + t, p)
            == (if t != [] || p == Lenient then [Asterisk] else []) + Squashed(t, p)
  {
    if t != [] {
      var s := [Asterisk] + t;
      assert s[1] == t[0] && s[2..] == t[1..];
      assert Squashed(t, p) == [t[0]] + Squashed(t[1..], p);
    } else {
      assert [Asterisk] + t == [Asterisk];
    }
  }

  // ---------------------------------------------------------------------
  // The two policies compared

  /** Number of asterisks at the end of `s`. */
  function TrailingMarkers(s: seq<char>): (t: nat)
    ensures t <= |s|
    ensures t < |s| ==> s[|s| - 1 - t] != Asterisk
  {
    if s == [] || s[|s| - 1] != Asterisk then 0
    else TrailingMarkers(s[..|s| - 1]) + 1
  }

  /** Dropping a prefix that ends in a non-asterisk keeps the trailing count. */
  lemma {:induction false} TrailingMarkersAfterRune(s: seq<char>, k: nat)
    requires 0 < k <= |s| && s[k - 1] != Asterisk
    ensures TrailingMarkers(s[k..]) == TrailingMarkers(s)
    decreases |s|
  {
    var n := |s|;
    if s[n - 1] == Asterisk {
      var s' := s[..n - 1];
      assert s[k..][..|s[k..]| - 1] == s'[k..];
      TrailingMarkersAfterRune(s', k);
    }
  }

  /**
   * Dropping a leading pair of asterisks removes two trailing asterisks when
   * the whole input is asterisks and none otherwise, so the parity is kept.
   */
  lemma {:induction false} TrailingMarkersAfterPair(s: seq<char>)
    requires |s| >= 2 && s[0] == Asterisk && s[1] == Asterisk
    ensures TrailingMarkers(s[2..])
            == if TrailingMarkers(s) == |s| then |s| - 2 else TrailingMarkers(s)
    decreases |s|
  {
    var n := |s|;
    if n == 2 {
      assert s[2..] == [];
      assert s[..1][..0] == [];
      assert TrailingMarkers(s[..1]) == 1;
    } else if s[n - 1] == Asterisk {
      var s', u := s[..n - 1], s[2..];
      assert u[|u| - 1] == Asterisk && u[..|u| - 1] == s'[2..];
      TrailingMarkersAfterPair(s');
    } else {
      assert s[2..][|s[2..]| - 1] != Asterisk;
    }
  }

  /** Whether `strict` is `lenient` without a final asterisk. */
  predicate DropsFinalMarker(lenient: seq<char>, strict: seq<char>)
  {
    lenient != [] && lenient[|lenient| - 1] == Asterisk && strict == lenient[..|lenient| - 1]
  }

  lemma DropsFinalMarkerPrepend(h: seq<char>, lenient: seq<char>, strict: seq<char>)
    requires DropsFinalMarker(lenient, strict)
    ensures DropsFinalMarker(h + lenient, h + strict)
  {
    assert (h + lenient)[..|h + lenient| - 1] == h + lenient[..|lenient| - 1];
  }

  /**
   * The input ends with an unpaired asterisk exactly when its final run of
   * asterisks is odd. Then the lenient output ends with that asterisk and
   * the strict output is the lenient one without it; otherwise the two
   * outputs are equal.
   */
  lemma {:induction false} StrictDropsDanglingMarker(s: seq<char>)
    ensures if TrailingMarkers(s) % 2 == 1
            then DropsFinalMarker(Squashed(s, Lenient), Squashed(s, Strict))
            else Squashed(s, Strict) == Squashed(s, Lenient)
    decreases |s|
  {
    if s == [] {
    } else if s == [Asterisk] {
      assert Squashed(s, Lenient) == [Asterisk] && Squashed(s, Strict) == [];
      assert TrailingMarkers(s) == 1 by { assert s[..0] == []; }
    } else {
      var k, h := FirstStepKeepsParity(s);
      var t := s[k..];
      StrictDropsDanglingMarker(t);
      if TrailingMarkers(s) % 2 == 1 {
        DropsFinalMarkerPrepend(h, Squashed(t, Lenient), Squashed(t, Strict));
      }
    }
  }

  /**
   * The first step of SQUASH consumes `k` runes and emits `h` for them
   * under either policy, and leaves a rest whose final run of asterisks
   * has the parity of the whole input's.
   */
  lemma FirstStepKeepsParity(s: seq<char>) returns (k: nat, h: seq<char>)
    requires s != [] && s != [Asterisk]
    ensures 0 < k <= |s|
    ensures Squashed(s, Lenient) == h + Squashed(s[k..], Lenient)
    ensures Squashed(s, Strict) == h + Squashed(s[k..], Strict)
    ensures TrailingMarkers(s[k..]) % 2 == TrailingMarkers(s) % 2
  {
    if s[0] != Asterisk {
      k, h := 1, [s[0]];
      TrailingMarkersAfterRune(s, 1);
    } else if s[1] != Asterisk {
      k, h := 2, [Asterisk, s[1]];
      TrailingMarkersAfterRune(s, 2);
    } else {
      k, h := 2, [UpArrow];
      TrailingMarkersAfterPair(s);
      ParityAfterPair(TrailingMarkers(s), TrailingMarkers(s[2..]), |s|);
    }
  }

  lemma ParityAfterPair(t: nat, u: nat, n: nat)
    requires n >= 2 && u == if t == n then n - 2 else t
    ensures u % 2 == t % 2
  {
  }

  // ---------------------------------------------------------------------
  // No pair survives

  /** No two adjacent asterisks in `s`. */
  predicate NoAdjacentMarkers(s: seq<char>)
  {
    forall k :: 0 < k < |s| ==> !(s[k - 1] == Asterisk && s[k] == Asterisk)
  }

  /** Joining two streams without "**" creates none unless both sides of the seam are asterisks. */
  lemma NoAdjacentMarkersJoin(a: seq<char>, b: seq<char>)
    requires NoAdjacentMarkers(a) && NoAdjacentMarkers(b)
    requires a == [] || b == [] || a[|a| - 1] != Asterisk || b[0] != Asterisk
    ensures NoAdjacentMarkers(a + b)
  {
    var s := a + b;
    forall k | 0 < k < |s|
      ensures !(s[k - 1] == Asterisk && s[k] == Asterisk)
    {
      if k > |a| {
        assert s[k - 1] == b[k - 1 - |a|] && s[k] == b[k - |a|];
      }
    }
  }

  /** Under either policy, the output never holds "**". */
  lemma {:induction false} SquashNoAdjacentMarkers(s: seq<char>, p: Policy)
    ensures NoAdjacentMarkers(Squashed(s, p))
    decreases |s|
  {
    if s == [] {
    } else if s[0] != Asterisk {
      SquashNoAdjacentMarkers(s[1..], p);
      NoAdjacentMarkersJoin([s[0]], Squashed(s[1..], p));
    } else if |s| == 1 {
    } else if s[1] != Asterisk {
      SquashNoAdjacentMarkers(s[2..], p);
      NoAdjacentMarkersJoin([Asterisk, s[1]], Squashed(s[2..], p));
    } else {
      SquashNoAdjacentMarkers(s[2..], p);
      NoAdjacentMarkersJoin([UpArrow], Squashed(s[2..], p));
    }
  }

  /** The lenient SQUASH leaves a stream without "**" unchanged. */
  lemma {:induction false} SquashExFixesNoAdjacent(s: seq<char>)
    requires NoAdjacentMarkers(s)
    ensures Squashed(s, Lenient) == s
    decreases |s|
  {
    if s != [] {
      if s[0] != Asterisk || |s| == 1 {
        assert NoAdjacentMarkers(s[1..]) by {
          forall k | 0 < k < |s[1..]| ensures !(s[1..][k - 1] == Asterisk && s[1..][k] == Asterisk) {
            assert s[1..][k - 1] == s[k] && s[1..][k] == s[k + 1];
          }
        }
        SquashExFixesNoAdjacent(s[1..]);
        assert s == [s[0]] + s[1..];
      } else {
        assert s[1] != Asterisk by { assert 0 < 1 < |s|; }
        assert NoAdjacentMarkers(s[2..]) by {
          forall k | 0 < k < |s[2..]| ensures !(s[2..][k - 1] == Asterisk && s[2..][k] == Asterisk) {
            assert s[2..][k - 1] == s[k + 1] && s[2..][k] == s[k + 2];
          }
        }
        SquashExFixesNoAdjacent(s[2..]);
        assert s == [s[0], s[1]] + s[2..];
      }
    }
  }

  /** Squashing an already squashed stream again with SQUASH_EX changes nothing. */
  lemma SquashExIdempotent(s: seq<char>, p: Policy)
    ensures Squashed(Squashed(s, p), Lenient) == Squashed(s, p)
  {
    SquashNoAdjacentMarkers(s, p);
    SquashExFixesNoAdjacent(Squashed(s, p));
  }

  // ---------------------------------------------------------------------
  // Counting

  /**
   * `output` is `input` with some pairs of asterisks replaced by one arrow
   * each, as far as rune counts go: with `pairs` the number of arrows
   * added, `output` is `pairs` runes shorter, holds `2 * pairs` fewer
   * asterisks, and every other rune occurs as often.
   */
  ghost predicate PairsReplaced(input: seq<char>, output: seq<char>)
  {
    var pairs := multiset(output)[UpArrow] as int - multiset(input)[UpArrow];
    && pairs >= 0
    && |output| + pairs == |input|
    && multiset(output)[Asterisk] + 2 * pairs == multiset(input)[Asterisk]
    && forall c :: c != Asterisk && c != UpArrow ==> multiset(output)[c] == multiset(input)[c]
  }

  /** Splitting the input at `k`, the two parts' outputs make up the whole output. */
  lemma PairsReplacedSplit(s: seq<char>, k: nat, x: seq<char>, y: seq<char>)
    requires k <= |s|
    requires PairsReplaced(s[..k], x) && PairsReplaced(s[k..], y)
    ensures PairsReplaced(s, x + y)
  {
    assert s == s[..k] + s[k..];
    assert multiset(s) == multiset(s[..k]) + multiset(s[k..]);
    assert multiset(x + y) == multiset(x) + multiset(y);
  }

  /** The first step of lenient SQUASH consumes `k` runes and emits `h` for them. */
  lemma SquashExFirstStep(s: seq<char>) returns (k: nat, h: seq<char>)
    requires s != [] && s != [Asterisk]
    ensures 0 < k <= |s|
    ensures Squashed(s, Lenient) == h + Squashed(s[k..], Lenient)
    ensures PairsReplaced(s[..k], h)
  {
    if s[0] != Asterisk {
      k, h := 1, [s[0]];
      assert s[..k] == h;
    } else if s[1] != Asterisk {
      k, h := 2, [Asterisk, s[1]];
      assert s[..k] == h;
    } else {
      k, h := 2, [UpArrow];
      assert s[..k] == [Asterisk, Asterisk];
    }
  }

  /** Lenient SQUASH replaces pairs of asterisks by arrows and changes no other rune count. */
  lemma {:induction false} SquashExCounts(s: seq<char>)
    ensures PairsReplaced(s, Squashed(s, Lenient))
    decreases |s|
  {
    if s == [] {
    } else if s == [Asterisk] {
      assert Squashed(s, Lenient) == s;
    } else {
      var k, h := SquashExFirstStep(s);
      SquashExCounts(s[k..]);
      PairsReplacedSplit(s, k, h, Squashed(s[k..], Lenient));
    }
  }

  // ---------------------------------------------------------------------
  // Worked examples

  /** "a**b" gives "a↑b", "a***b" gives "a↑*b", "ab*" keeps or drops its "*". */
  lemma SquashExamples()
    ensures Squashed("a**b", Lenient) == "a↑b" && Squashed("a**b", Strict) == "a↑b"
    ensures Squashed("a***b", Lenient) == "a↑*b" && Squashed("a***b", Strict) == "a↑*b"
    ensures Squashed("ab*", Lenient) == "ab*" && Squashed("ab*", Strict) == "ab"
  {
    assert "a**b"[1..][2..] == "b";
    assert "a***b"[1..][2..] == "*b";
    assert "a***b"[1..][2..][2..] == "";
    assert "ab*"[1..][1..] == "*";
  }
}
